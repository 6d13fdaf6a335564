/** The fixed text the generator emits around and after the parts it
    computes: the document shell of the structural artifact, the stylesheet
    after its theme variables, and the submission script. The strings are
    byte-for-byte the template literals of js/generator.js. */
module Templates {

  /** From the doctype up to the `<title>` tag. */
  const DocumentHead: string :=
    "<!DOCTYPE html>\n" +
    "<html lang=\"en\">\n" +
    "<head>\n" +
    "    <meta charset=\"UTF-8\">\n" +
    "    <meta name=\"viewport\" content=\"width=device-width, initial-scale=1.0\">\n" +
    "    "

  /** From the `</title>` tag up to the form's `action` attribute. */
  const HeadToForm: string :=
    "\n" +
    "    <link rel=\"preconnect\" href=\"https://fonts.googleapis.com\">\n" +
    "    <link rel=\"preconnect\" href=\"https://fonts.gstatic.com\" crossorigin>\n" +
    "    <link href=\"https://fonts.googleapis.com/css2?family=Roboto:wght@400;500;700&display=swap\" rel=\"stylesheet\">\n" +
    "    <link rel=\"stylesheet\" href=\"styles.css\">\n" +
    "</head>\n" +
    "<body>\n" +
    "    <div class=\"container\">\n" +
    "        <form id=\"customForm\" "

  /** From the end of the `action` attribute up to the `<h1>` tag. */
  const FormToHeading: string :=
    " method=\"POST\">\n" +
    "            <div class=\"form-header\">\n" +
    "                "

  /** From the `</h1>` tag up to the field container. */
  const HeadingToFields: string :=
    "\n" +
    "                <p class=\"form-description\">Please fill out the form below.</p>\n" +
    "            </div>\n" +
    "            \n" +
    "            "

  /** The field container's opening tag, after which the fragments
      follow on a line of their own. */
  const FieldsOpen: string := "<div class=\"form-fields\">\n"

  /** The line closing the field container. */
  const FieldsClose: string := "\n            </div>"

  /** From the field container to the end of the document. */
  const DocumentEnd: string :=
    "\n" +
    "            \n" +
    "            <div class=\"form-footer\">\n" +
    "                <button type=\"submit\" class=\"submit-button\">Submit</button>\n" +
    "            </div>\n" +
    "        </form>\n" +
    "        \n" +
    "        <div id=\"success-message\" class=\"success-message\" style=\"display: none;\">\n" +
    "            <div class=\"success-icon\">\U{2713}</div>\n" +
    "            <h2>Thank You!</h2>\n" +
    "            <p>Your response has been submitted successfully.</p>\n" +
    "        </div>\n" +
    "    </div>\n" +
    "    \n" +
    "    <script src=\"script.js\"></script>\n" +
    "</body>\n" +
    "</html>"

  /** The stylesheet after the two theme variables of its `:root` block. */
  const StylesheetRest: string :=
    "    --text-color: #202124;\n" +
    "    --light-text: #5F6368;\n" +
    "    --border-color: #DADCE0;\n" +
    "    --background-color: #F8F9FA;\n" +
    "    --card-background: #FFFFFF;\n" +
    "    --error-color: #EA4335;\n" +
    "    --success-color: #34A853;\n" +
    "}\n" +
    "\n" +
    "* {\n" +
    "    margin: 0;\n" +
    "    padding: 0;\n" +
    "    box-sizing: border-box;\n" +
    "}\n" +
    "\n" +
    "body {\n" +
    "    font-family: 'Roboto', system-ui, -apple-system, BlinkMacSystemFont, 'Segoe UI', Oxygen, Ubuntu, Cantarell, 'Open Sans', 'Helvetica Neue', sans-serif;\n" +
    "    background-color: var(--background-color);\n" +
    "    color: var(--text-color);\n" +
    "    line-height: 1.5;\n" +
    "    min-height: 100vh;\n" +
    "    display: flex;\n" +
    "    justify-content: center;\n" +
    "    align-items: center;\n" +
    "    padding: 2rem 1rem;\n" +
    "}\n" +
    "\n" +
    ".container {\n" +
    "    width: 100%;\n" +
    "    max-width: 600px;\n" +
    "    background-color: var(--card-background);\n" +
    "    border-radius: 8px;\n" +
    "    box-shadow: 0 1px 2px 0 rgba(60, 64, 67, 0.3), 0 1px 3px 1px rgba(60, 64, 67, 0.15);\n" +
    "    overflow: hidden;\n" +
    "}\n" +
    "\n" +
    "form {\n" +
    "    display: flex;\n" +
    "    flex-direction: column;\n" +
    "}\n" +
    "\n" +
    ".form-header {\n" +
    "    padding: 2rem 2rem 1.5rem;\n" +
    "    border-top: 10px solid var(--primary-color);\n" +
    "}\n" +
    "\n" +
    ".form-header h1 {\n" +
    "    font-size: 1.75rem;\n" +
    "    font-weight: 500;\n" +
    "    color: var(--text-color);\n" +
    "    margin-bottom: 0.5rem;\n" +
    "}\n" +
    "\n" +
    ".form-description {\n" +
    "    color: var(--light-text);\n" +
    "    font-size: 0.875rem;\n" +
    "}\n" +
    "\n" +
    ".form-fields {\n" +
    "    padding: 1.5rem 2rem;\n" +
    "}\n" +
    "\n" +
    ".form-group {\n" +
    "    margin-bottom: 1.5rem;\n" +
    "}\n" +
    "\n" +
    ".form-group label {\n" +
    "    display: block;\n" +
    "    font-size: 0.875rem;\n" +
    "    font-weight: 500;\n" +
    "    margin-bottom: 0.5rem;\n" +
    "    color: var(--text-color);\n" +
    "}\n" +
    "\n" +
    ".form-group input {\n" +
    "    width: 100%;\n" +
    "    padding: 0.75rem;\n" +
    "    border: 1px solid var(--border-color);\n" +
    "    border-radius: 4px;\n" +
    "    font-size: 1rem;\n" +
    "    transition: border-color 0.2s;\n" +
    "}\n" +
    "\n" +
    ".form-group input:focus {\n" +
    "    outline: none;\n" +
    "    border-color: var(--primary-color);\n" +
    "    box-shadow: 0 0 0 2px rgba(var(--primary-rgb), 0.2);\n" +
    "}\n" +
    "\n" +
    ".form-footer {\n" +
    "    padding: 1.5rem 2rem 2rem;\n" +
    "    display: flex;\n" +
    "    justify-content: flex-end;\n" +
    "}\n" +
    "\n" +
    ".submit-button {\n" +
    "    background-color: var(--primary-color);\n" +
    "    color: white;\n" +
    "    border: none;\n" +
    "    border-radius: 4px;\n" +
    "    padding: 0.75rem 2rem;\n" +
    "    font-size: 0.875rem;\n" +
    "    font-weight: 500;\n" +
    "    cursor: pointer;\n" +
    "    transition: background-color 0.2s, box-shadow 0.2s;\n" +
    "}\n" +
    "\n" +
    ".submit-button:hover {\n" +
    "    box-shadow: 0 1px 2px 0 rgba(60, 64, 67, 0.3), 0 1px 3px 1px rgba(60, 64, 67, 0.15);\n" +
    "}\n" +
    "\n" +
    ".success-message {\n" +
    "    padding: 3rem 2rem;\n" +
    "    text-align: center;\n" +
    "}\n" +
    "\n" +
    ".success-icon {\n" +
    "    width: 64px;\n" +
    "    height: 64px;\n" +
    "    background-color: var(--success-color);\n" +
    "    color: white;\n" +
    "    border-radius: 50%;\n" +
    "    display: flex;\n" +
    "    align-items: center;\n" +
    "    justify-content: center;\n" +
    "    font-size: 2rem;\n" +
    "    margin: 0 auto 1.5rem;\n" +
    "}\n" +
    "\n" +
    ".success-message h2 {\n" +
    "    font-size: 1.5rem;\n" +
    "    font-weight: 500;\n" +
    "    margin-bottom: 0.5rem;\n" +
    "}\n" +
    "\n" +
    ".success-message p {\n" +
    "    color: var(--light-text);\n" +
    "}\n" +
    "\n" +
    "@media (max-width: 768px) {\n" +
    "    .form-header,\n" +
    "    .form-fields,\n" +
    "    .form-footer {\n" +
    "        padding-left: 1.5rem;\n" +
    "        padding-right: 1.5rem;\n" +
    "    }\n" +
    "    \n" +
    "    .form-header h1 {\n" +
    "        font-size: 1.5rem;\n" +
    "    }\n" +
    "}"

  /** The submission script up to its request. */
  const ScriptSetup: string :=
    "document.addEventListener('DOMContentLoaded', () => {\n" +
    "    const form = document.getElementById('customForm');\n" +
    "    const successMessage = document.getElementById('success-message');\n" +
    "    \n" +
    "    form.addEventListener('submit', async (e) => {\n" +
    "        e.preventDefault();\n" +
    "        \n" +
    "        try {\n" +
    "            // Create FormData object\n" +
    "            const formData = new FormData(form);\n" +
    "            \n" +
    "            // Submit the form using fetch\n" +
    "            const response = await "

  /** The request: the form's data posted to its `action`, without reading
      the cross-origin response. */
  const SubmitRequest: string :=
    "fetch(form.action, {\n" +
    "                method: 'POST',\n" +
    "                body: formData,\n" +
    "                mode: 'no-cors'"

  /** The rest of the script: the success message replaces the form. */
  const ScriptAfterRequest: string :=
    " // Required for Google Forms\n" +
    "            });\n" +
    "            \n" +
    "            // Show success message\n" +
    "            form.style.display = 'none';\n" +
    "            successMessage.style.display = 'block';\n" +
    "            \n" +
    "            // Optional: Reset form\n" +
    "            form.reset();\n" +
    "            \n" +
    "        } catch (error) {\n" +
    "            console.error('Error submitting form:', error);\n" +
    "            alert('There was an error submitting the form. Please try again.');\n" +
    "        }\n" +
    "    });\n" +
    "});"

  /** The whole submission script. */
  const SubmissionScript: string := ScriptSetup + SubmitRequest + ScriptAfterRequest
}
